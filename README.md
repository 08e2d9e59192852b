# Matrix storage manager of the Angel parameter-server agent, in Dafny

This project models `MatrixStorageManager`, the worker-side cache of the
Angel parameter-server agent. A worker keeps in it the matrix rows it has
pulled, or is about to push. The manager is a two-level table:

- an outer map from matrix id to a per-matrix `MatrixStorage` object;
- inside each storage, a map from row index to a row vector (`TVector`).

Storages are created lazily, with put-if-absent semantics. A row read, a
row write or a row removal on an unknown matrix id first registers an empty
storage for it.

Layout:

- `wrappers.dfy`: `Option`, the "absent" result that stands for Java's `null`.
- `row_store.dfy`: class `RowStore<V>`, the per-matrix storage (`MatrixStorage`),
  with a `rows: map<int, V>` field. Row vectors are the opaque type parameter `V`.
- `table_spec.dfy`: module `TableSpec`. The manager's abstract value is a
  `Table<V> = map<int, map<int, V>>`. Each operation is a function from the old
  table to the new one (and, for `getRow`, to the value returned). Lemmas
  relate pairs of calls.
- `call_traces.dfy`: module `CallTraces`. Sequences of calls are run on the
  table. Lemmas proved by induction lift the one-call properties to whole call
  sequences: calls on one matrix never affect another, a matrix is registered
  exactly when its last call was not `removeMatrix`, and rows are last-writer-wins.
- `storage_manager.dfy`: class `MatrixStorageManager<V>` with the mutable field
  `storages: map<int, RowStore<V>>`. Its methods follow the Java methods
  statement by statement. Each states two things. First, which storage objects
  the table holds afterwards: existing ones are never replaced, and a new one is
  `fresh`. Second, that the abstract value `Contents()` moves exactly as the
  matching `TableSpec` function says. `Valid()` is the object invariant that no
  storage object is shared by two matrix ids.
- `clients.dfy`: call sequences on a manager. They state what a caller may
  conclude about storage identity, and one runs a typical sequence of row
  writes, reads and removals.

The `storage == null` guards in `getRow`, `addRow` and `removeRow` are kept as
branches. `GetMatrixStorage` promises a non-null result, and each guard holds
`assert false`, which is a proof that the guard cannot be reached in a
sequential run.

Two behaviours of the code are worth stating plainly:

- `removeRow` on an unregistered matrix is not a no-op. It calls
  `getMatrixStoage` first, which registers an empty storage (see
  `TableSpec.RemoveRowRegisters` and `ManagerClients.RemoveRowCreationVisible`).
- `addRow` does not check its row for null (see "Left out").

## Model

| member | source | states |
|---|---|---|
| `StorageManager.MatrixStorageManager.constructor` | angel-ps/core/src/main/java/com/tencent/angel/psagent/matrix/storage/MatrixStorageManager.java:33-35 | a new manager holds no storage and satisfies the no-sharing invariant |
| `StorageManager.MatrixStorageManager.AddMatrix` | angel-ps/core/src/main/java/com/tencent/angel/psagent/matrix/storage/MatrixStorageManager.java:42-44 | if the id is registered the table is unchanged; otherwise exactly one fresh, empty storage is added for it and no other entry changes |
| `StorageManager.MatrixStorageManager.RemoveMatrix` | angel-ps/core/src/main/java/com/tencent/angel/psagent/matrix/storage/MatrixStorageManager.java:51-53 | only the id's entry is deleted (no-op when absent); every other storage stays |
| `StorageManager.MatrixStorageManager.GetMatrixStorage` | angel-ps/core/src/main/java/com/tencent/angel/psagent/matrix/storage/MatrixStorageManager.java:61-68 | returns a non-null storage that is the one now registered for the id: the existing object with nothing changed, or one new empty object that is installed |
| `StorageManager.MatrixStorageManager.GetRow` | angel-ps/core/src/main/java/com/tencent/angel/psagent/matrix/storage/MatrixStorageManager.java:77-84 | returns the row the matrix held at the index, or None; leaves the matrix registered, with a fresh storage if it had none; null guard proved dead |
| `StorageManager.MatrixStorageManager.AddRow` | angel-ps/core/src/main/java/com/tencent/angel/psagent/matrix/storage/MatrixStorageManager.java:93-104 | the matrix is registered afterwards and its row at the index is the given row; other rows and other matrices are unchanged; the pre-check plus get-or-create keeps existing storages |
| `StorageManager.MatrixStorageManager.RemoveRow` | angel-ps/core/src/main/java/com/tencent/angel/psagent/matrix/storage/MatrixStorageManager.java:113-120 | registers the matrix if absent, then drops only that row from its storage; other matrices are unchanged |
| `RowStorage.RowStore.constructor` | angel-ps/core/src/main/java/com/tencent/angel/psagent/matrix/storage/MatrixStorageManager.java:43 | a newly created matrix storage holds no rows |
| `RowStorage.RowStore.GetRow` | angel-ps/core/src/main/java/com/tencent/angel/psagent/matrix/storage/MatrixStorageManager.java:83 | returns a row exactly when one is held at the index, and then that row (assumed storage semantics) |
| `RowStorage.RowStore.AddRow` | angel-ps/core/src/main/java/com/tencent/angel/psagent/matrix/storage/MatrixStorageManager.java:103 | stores the row at the index, overwriting what was there, leaving other rows (assumed last-writer-wins) |
| `RowStorage.RowStore.RemoveRow` | angel-ps/core/src/main/java/com/tencent/angel/psagent/matrix/storage/MatrixStorageManager.java:119 | drops the row at the index only (assumed storage semantics) |
| `TableSpec.AddMatrix` | angel-ps/core/src/main/java/com/tencent/angel/psagent/matrix/storage/MatrixStorageManager.java:42-44 | the ids afterwards are the old ids plus this one; every existing entry is kept as it was; a new entry is empty |
| `TableSpec.RemoveMatrix` | angel-ps/core/src/main/java/com/tencent/angel/psagent/matrix/storage/MatrixStorageManager.java:51-53 | the ids afterwards are the old ids minus this one; every remaining entry is unchanged |
| `TableSpec.GetRow` | angel-ps/core/src/main/java/com/tencent/angel/psagent/matrix/storage/MatrixStorageManager.java:77-84 | a row is found exactly when the matrix was registered and held a row at the index, and then it is that row |
| `TableSpec.AddRow` | angel-ps/core/src/main/java/com/tencent/angel/psagent/matrix/storage/MatrixStorageManager.java:93-104 | the matrix is registered; its row indices gain the index, which holds the new row; its other rows and all other matrices are unchanged |
| `TableSpec.RemoveRow` | angel-ps/core/src/main/java/com/tencent/angel/psagent/matrix/storage/MatrixStorageManager.java:113-120 | the matrix is registered; its row indices lose the index; its remaining rows and all other matrices are unchanged |
| `TableSpec.AddMatrixIdempotent` | angel-ps/core/src/main/java/com/tencent/angel/psagent/matrix/storage/MatrixStorageManager.java:43 | registering twice gives the same table as registering once |
| `TableSpec.GetRowOfNewMatrix` | angel-ps/core/src/main/java/com/tencent/angel/psagent/matrix/storage/MatrixStorageManager.java:77-84 | on a never-registered matrix getRow returns None: the storage it creates holds no row |
| `TableSpec.GetRowAfterAddRow` | angel-ps/core/src/main/java/com/tencent/angel/psagent/matrix/storage/MatrixStorageManager.java:93-104 | write-then-read returns the row written; reads of every other (matrix, row) pair are unaffected |
| `TableSpec.GetRowAfterRemoveRow` | angel-ps/core/src/main/java/com/tencent/angel/psagent/matrix/storage/MatrixStorageManager.java:113-120 | remove-then-read returns None; reads of every other (matrix, row) pair are unaffected |
| `TableSpec.AfterRemoveMatrix` | angel-ps/core/src/main/java/com/tencent/angel/psagent/matrix/storage/MatrixStorageManager.java:51-68 | after removeMatrix every row of the matrix reads None, and get-or-create yields an empty storage |
| `TableSpec.AddRowPrecheckRedundant` | angel-ps/core/src/main/java/com/tencent/angel/psagent/matrix/storage/MatrixStorageManager.java:94-98 | registering before addRow ends in the same table as addRow alone, so the containsKey pre-check changes nothing |
| `TableSpec.RemoveRowRegisters` | angel-ps/core/src/main/java/com/tencent/angel/psagent/matrix/storage/MatrixStorageManager.java:113-120 | on a never-registered id removeRow is not a no-op: it leaves the table with an empty storage for that id |
| `CallTraces.Step` | angel-ps/core/src/main/java/com/tencent/angel/psagent/matrix/storage/MatrixStorageManager.java:42-120 | any manager call leaves the entry of every other matrix id unchanged |
| `CallTraces.RunCongruent` | angel-ps/core/src/main/java/com/tencent/angel/psagent/matrix/storage/MatrixStorageManager.java:42-120 | what a call sequence makes of a matrix depends only on that matrix's starting entry |
| `CallTraces.RunOnOwnCalls` | angel-ps/core/src/main/java/com/tencent/angel/psagent/matrix/storage/MatrixStorageManager.java:42-120 | a matrix's entry after any call sequence equals its entry after only the calls made on that matrix |
| `CallTraces.RegisteredAfterLastCall` | angel-ps/core/src/main/java/com/tencent/angel/psagent/matrix/storage/MatrixStorageManager.java:42-120 | after a call sequence that names a matrix, the matrix is registered iff its last call was not removeMatrix (lazy creation is visible later) |
| `CallTraces.RunKeepsRow` | angel-ps/core/src/main/java/com/tencent/angel/psagent/matrix/storage/MatrixStorageManager.java:77-120 | calls that neither write nor remove a row, nor remove its matrix, leave what the row reads as unchanged |
| `CallTraces.LastWriterWins` | angel-ps/core/src/main/java/com/tencent/angel/psagent/matrix/storage/MatrixStorageManager.java:93-120 | after any call sequence a row reads as the value of the last addRow to it, or None if a removeRow of it or a removeMatrix came last |
| `ManagerClients.AddMatrixTwice` | angel-ps/core/src/main/java/com/tencent/angel/psagent/matrix/storage/MatrixStorageManager.java:42-44 | two addMatrix calls leave one storage for the id, the same object after each call, and keep a pre-existing one |
| `ManagerClients.GetMatrixStorageTwice` | angel-ps/core/src/main/java/com/tencent/angel/psagent/matrix/storage/MatrixStorageManager.java:61-68 | two consecutive getMatrixStoage calls return the same non-null object |
| `ManagerClients.GetMatrixStorageAfterRemove` | angel-ps/core/src/main/java/com/tencent/angel/psagent/matrix/storage/MatrixStorageManager.java:51-68 | after removeMatrix, getMatrixStoage returns a fresh, empty storage distinct from the removed one |
| `ManagerClients.LazyCreationVisible` | angel-ps/core/src/main/java/com/tencent/angel/psagent/matrix/storage/MatrixStorageManager.java:77-120 | getRow on an unknown id returns None and installs a fresh storage; the later lookup returns that same object, holding the row written through the manager |
| `ManagerClients.RemoveRowCreationVisible` | angel-ps/core/src/main/java/com/tencent/angel/psagent/matrix/storage/MatrixStorageManager.java:113-120 | removeRow on an unknown id installs a fresh, empty storage, and the next getMatrixStoage returns that same object |
| `ManagerClients.Scenario` | angel-ps/core/src/main/java/com/tencent/angel/psagent/matrix/storage/MatrixStorageManager.java:42-120 | register, put rows 0 and 1, read 0, remove 0, read 0 and 1, remove the matrix, read 1: the reads give row0, None, row1, None |

## Left out

- Concurrency. `ConcurrentHashMap`, the atomicity of `putIfAbsent`, and all interleavings are not modelled. The model is sequential. In particular, a concurrent `removeMatrix` could run between the `addMatrix` and the second `get` in `getMatrixStoage`. That window is what makes its null result, and the null guards of the row methods, reachable. Here those guards are proved dead.
- The source of `MatrixStorage` is not available. `RowStore` assumes it is a plain row-index map with last-writer-wins `addRow`, a `getRow` that returns null when the row is absent, and a `removeRow` that drops one index.
- `TVector` is the opaque type parameter `V`. Its numeric content and its dense or sparse layout are not modelled. `V` has no null, so `addRow` with a null row is not modelled: the manager does not check it, and what `MatrixStorage` does with it is not known.
- `addMatrix` in Java builds a `new MatrixStorage()` even when the id is present, and then discards it. The model allocates only when the id is absent. The discarded object is never observable.
- Matrix ids and row indices are Java `int`s. They are only map keys and no arithmetic is done on them, so the model's unbounded `int` loses nothing.
- The RPC pull and push layer that supplies rows is not part of this model.
