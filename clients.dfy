/**
 * Call sequences on a manager, stating what the manager's contracts let a
 * caller conclude about storage identity and about the rows read back.
 */
module ManagerClients {
  import opened Wrappers
  import opened RowStorage
  import opened StorageManager

  /** addMatrix twice: the second call changes nothing and keeps the same storage object. */
  method AddMatrixTwice<V>(manager: MatrixStorageManager<V>, matrixId: int)
    returns (first: RowStore<V>, second: RowStore<V>)
    requires manager.Valid()
    modifies manager
    ensures manager.Valid() && first == second
    ensures manager.storages == old(manager.storages)[matrixId := first]
    ensures matrixId in old(manager.storages) ==> first == old(manager.storages)[matrixId]
  {
    manager.AddMatrix(matrixId);
    first := manager.storages[matrixId];
    ghost var once := manager.storages;
    manager.AddMatrix(matrixId);
    second := manager.storages[matrixId];
    assert manager.storages == once;
  }

  /** Two consecutive getMatrixStoage calls return the same object. */
  method GetMatrixStorageTwice<V>(manager: MatrixStorageManager<V>, matrixId: int)
    returns (first: RowStore?<V>, second: RowStore?<V>)
    requires manager.Valid()
    modifies manager
    ensures manager.Valid() && first != null && first == second
    ensures manager.storages == old(manager.storages)[matrixId := first]
  {
    first := manager.GetMatrixStorage(matrixId);
    second := manager.GetMatrixStorage(matrixId);
  }

  /**
   * After removeMatrix, get-or-create hands out a new, empty storage, not the
   * one that was removed.
   */
  method GetMatrixStorageAfterRemove<V>(manager: MatrixStorageManager<V>, matrixId: int)
    returns (removed: RowStore?<V>, created: RowStore?<V>)
    requires manager.Valid()
    modifies manager
    ensures manager.Valid() && removed != null && created != null
    ensures fresh(created) && created != removed && created.rows == map[]
    ensures manager.storages == old(manager.storages)[matrixId := created]
  {
    removed := manager.GetMatrixStorage(matrixId);
    manager.RemoveMatrix(matrixId);
    created := manager.GetMatrixStorage(matrixId);
  }

  /**
   * The lazy creation done by getRow is visible to later calls: the storage
   * it installs is the one every later lookup returns, holding the rows
   * written through the manager.
   */
  method LazyCreationVisible<V>(manager: MatrixStorageManager<V>, matrixId: int, rowIndex: int, row: V)
    returns (read: Option<V>, created: RowStore<V>, lookedUp: RowStore?<V>)
    requires manager.Valid()
    requires matrixId !in manager.storages
    modifies manager, manager.storages.Values
    ensures manager.Valid() && read == None
    ensures fresh(created) && lookedUp == created
    ensures created.rows == map[rowIndex := row]
    ensures manager.storages == old(manager.storages)[matrixId := created]
  {
    read := manager.GetRow(matrixId, rowIndex);
    created := manager.storages[matrixId];
    manager.RemoveRow(matrixId, rowIndex);
    manager.AddRow(matrixId, rowIndex, row);
    lookedUp := manager.GetMatrixStorage(matrixId);
  }

  /**
   * removeRow on an unknown id is not a no-op: it installs an empty storage,
   * and the next lookup returns that same object.
   */
  method RemoveRowCreationVisible<V>(manager: MatrixStorageManager<V>, matrixId: int, rowIndex: int)
    returns (installed: RowStore<V>, lookedUp: RowStore?<V>)
    requires manager.Valid()
    requires matrixId !in manager.storages
    modifies manager, manager.storages.Values
    ensures manager.Valid()
    ensures fresh(installed) && installed.rows == map[] && lookedUp == installed
    ensures manager.storages == old(manager.storages)[matrixId := installed]
  {
    manager.RemoveRow(matrixId, rowIndex);
    installed := manager.storages[matrixId];
    lookedUp := manager.GetMatrixStorage(matrixId);
  }

  /**
   * Register matrix 1, put rows 0 and 1, read row 0, remove it, read rows 0
   * and 1, remove matrix 1, read row 1 again.
   */
  method Scenario<V>(row0: V, row1: V)
    returns (read0: Option<V>, read0Removed: Option<V>, read1: Option<V>, read1Unregistered: Option<V>)
    ensures read0 == Some(row0) && read0Removed == None
    ensures read1 == Some(row1) && read1Unregistered == None
  {
    var manager := new MatrixStorageManager<V>();
    manager.AddMatrix(1);
    manager.AddRow(1, 0, row0);
    manager.AddRow(1, 1, row1);
    read0 := manager.GetRow(1, 0);
    manager.RemoveRow(1, 0);
    read0Removed := manager.GetRow(1, 0);
    read1 := manager.GetRow(1, 1);
    manager.RemoveMatrix(1);
    read1Unregistered := manager.GetRow(1, 1);
  }
}
