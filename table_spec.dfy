/**
 * The abstract value of a matrix storage manager: for every registered
 * matrix id, the rows its storage holds.  Each manager operation is given
 * here as a function from the table before the call to the table after it
 * (and, for a read, to the value returned); the lemmas relate pairs of calls.
 */
module TableSpec {
  import opened Wrappers

  /** matrix id -> (row index -> row) */
  type Table<V> = map<int, map<int, V>>

  /** The rows registered for `matrixId`, or None when it has no storage. */
  function Entry<V>(t: Table<V>, matrixId: int): Option<map<int, V>>
  {
    if matrixId in t then Some(t[matrixId]) else None
  }

  /**
   * addMatrix: put-if-absent of an empty storage.  An existing storage is
   * never replaced, and no other entry changes.
   */
  function AddMatrix<V>(t: Table<V>, matrixId: int): (r: Table<V>)
    ensures r.Keys == t.Keys + {matrixId}
    ensures forall m :: m in t ==> r[m] == t[m]
    ensures matrixId !in t ==> r[matrixId] == map[]
  {
    if matrixId in t then t else t[matrixId := map[]]
  }

  /** removeMatrix: drops the entry of `matrixId` (if any) and nothing else. */
  function RemoveMatrix<V>(t: Table<V>, matrixId: int): (r: Table<V>)
    ensures r.Keys == t.Keys - {matrixId}
    ensures forall m :: m in r ==> r[m] == t[m]
  {
    t - {matrixId}
  }

  /**
   * The row getRow returns: it reads the storage obtained by get-or-create,
   * so it finds a row exactly when the matrix was registered and holds one.
   */
  function GetRow<V>(t: Table<V>, matrixId: int, rowIndex: int): (row: Option<V>)
    ensures row.Some? <==> matrixId in t && rowIndex in t[matrixId]
    ensures row.Some? ==> row.value == t[matrixId][rowIndex]
  {
    var rows := AddMatrix(t, matrixId)[matrixId];
    if rowIndex in rows then Some(rows[rowIndex]) else None
  }

  /**
   * addRow: registers the matrix if needed, then stores `row` at `rowIndex`,
   * overwriting what was there; every other row and matrix is unchanged.
   */
  function AddRow<V>(t: Table<V>, matrixId: int, rowIndex: int, row: V): (r: Table<V>)
    ensures r.Keys == t.Keys + {matrixId}
    ensures r[matrixId].Keys == AddMatrix(t, matrixId)[matrixId].Keys + {rowIndex}
    ensures r[matrixId][rowIndex] == row
    ensures forall i :: i in r[matrixId] && i != rowIndex ==> r[matrixId][i] == t[matrixId][i]
    ensures forall m :: m in t && m != matrixId ==> r[m] == t[m]
  {
    var registered := AddMatrix(t, matrixId);
    registered[matrixId := registered[matrixId][rowIndex := row]]
  }

  /**
   * removeRow: registers the matrix if needed (so a never-registered id is
   * left with an empty storage), then drops `rowIndex` from its storage.
   */
  function RemoveRow<V>(t: Table<V>, matrixId: int, rowIndex: int): (r: Table<V>)
    ensures r.Keys == t.Keys + {matrixId}
    ensures r[matrixId].Keys == AddMatrix(t, matrixId)[matrixId].Keys - {rowIndex}
    ensures forall i :: i in r[matrixId] ==> r[matrixId][i] == t[matrixId][i]
    ensures forall m :: m in t && m != matrixId ==> r[m] == t[m]
  {
    var registered := AddMatrix(t, matrixId);
    registered[matrixId := registered[matrixId] - {rowIndex}]
  }

  /** Registering twice leaves the table registering once leaves. */
  lemma AddMatrixIdempotent<V>(t: Table<V>, matrixId: int)
    ensures AddMatrix(AddMatrix(t, matrixId), matrixId) == AddMatrix(t, matrixId)
  {
  }

  /** A storage created on demand holds no row yet. */
  lemma GetRowOfNewMatrix<V>(t: Table<V>, matrixId: int, rowIndex: int)
    requires matrixId !in t
    ensures GetRow(t, matrixId, rowIndex) == None
  {
  }

  /** Write-then-read: a row just added is the one read back; other reads are unaffected. */
  lemma GetRowAfterAddRow<V>(t: Table<V>, matrixId: int, rowIndex: int, row: V, m: int, i: int)
    ensures GetRow(AddRow(t, matrixId, rowIndex, row), matrixId, rowIndex) == Some(row)
    ensures (m, i) != (matrixId, rowIndex) ==>
      GetRow(AddRow(t, matrixId, rowIndex, row), m, i) == GetRow(t, m, i)
  {
  }

  /** Remove-then-read: a row just removed reads as absent; other reads are unaffected. */
  lemma GetRowAfterRemoveRow<V>(t: Table<V>, matrixId: int, rowIndex: int, m: int, i: int)
    ensures GetRow(RemoveRow(t, matrixId, rowIndex), matrixId, rowIndex) == None
    ensures (m, i) != (matrixId, rowIndex) ==>
      GetRow(RemoveRow(t, matrixId, rowIndex), m, i) == GetRow(t, m, i)
  {
  }

  /**
   * After removeMatrix every row of that matrix reads as absent, and
   * get-or-create installs an empty storage again.
   */
  lemma AfterRemoveMatrix<V>(t: Table<V>, matrixId: int, rowIndex: int)
    ensures GetRow(RemoveMatrix(t, matrixId), matrixId, rowIndex) == None
    ensures AddMatrix(RemoveMatrix(t, matrixId), matrixId)[matrixId] == map[]
  {
  }

  /** The containsKey/addMatrix pre-check in addRow does not change its outcome. */
  lemma AddRowPrecheckRedundant<V>(t: Table<V>, matrixId: int, rowIndex: int, row: V)
    ensures AddRow(AddMatrix(t, matrixId), matrixId, rowIndex, row) == AddRow(t, matrixId, rowIndex, row)
  {
  }

  /** On a never-registered id, removeRow is not a no-op: it leaves an empty storage. */
  lemma RemoveRowRegisters<V>(t: Table<V>, matrixId: int, rowIndex: int)
    requires matrixId !in t
    ensures RemoveRow(t, matrixId, rowIndex) == AddMatrix(t, matrixId)
    ensures RemoveRow(t, matrixId, rowIndex) != t
  {
  }
}
