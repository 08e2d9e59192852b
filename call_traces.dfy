/**
 * Sequences of manager calls, run one after another on the abstract table.
 * The lemmas lift the one-call properties of TableSpec to whole call
 * sequences: calls on other matrices never affect a matrix, a matrix is
 * registered after a sequence unless its last call was removeMatrix, and a
 * row reads back the last value written to it (last writer wins).
 */
module CallTraces {
  import opened Wrappers
  import opened TableSpec

  /** One public call of the manager, with its arguments. */
  datatype Call<V> =
    | AddMatrixCall(matrixId: int)
    | RemoveMatrixCall(matrixId: int)
    | GetMatrixStorageCall(matrixId: int)
    | GetRowCall(matrixId: int, rowIndex: int)
    | AddRowCall(matrixId: int, rowIndex: int, row: V)
    | RemoveRowCall(matrixId: int, rowIndex: int)

  /** The table after one call.  Every call touches only its own matrix's entry. */
  function Step<V>(t: Table<V>, c: Call<V>): (r: Table<V>)
    ensures forall m :: m != c.matrixId ==> Entry(r, m) == Entry(t, m)
  {
    match c
    case AddMatrixCall(m) => AddMatrix(t, m)
    case RemoveMatrixCall(m) => RemoveMatrix(t, m)
    case GetMatrixStorageCall(m) => AddMatrix(t, m)
    case GetRowCall(m, _) => AddMatrix(t, m)
    case AddRowCall(m, i, v) => AddRow(t, m, i, v)
    case RemoveRowCall(m, i) => RemoveRow(t, m, i)
  }

  /** The table after a sequence of calls, first call first. */
  function Run<V>(t: Table<V>, calls: seq<Call<V>>): Table<V>
    decreases |calls|
  {
    if calls == [] then t else Run(Step(t, calls[0]), calls[1..])
  }

  /** The calls of a sequence that are made on `matrixId`, in order. */
  function On<V>(calls: seq<Call<V>>, matrixId: int): (r: seq<Call<V>>)
    ensures forall c :: c in r ==> c in calls && c.matrixId == matrixId
    ensures |r| <= |calls|
  {
    if calls == [] then []
    else if calls[0].matrixId == matrixId then [calls[0]] + On(calls[1..], matrixId)
    else On(calls[1..], matrixId)
  }

  /** Whether a call can change what row `rowIndex` of `matrixId` reads as. */
  predicate Touches<V>(c: Call<V>, matrixId: int, rowIndex: int)
  {
    c.matrixId == matrixId &&
    (c.RemoveMatrixCall? || ((c.AddRowCall? || c.RemoveRowCall?) && c.rowIndex == rowIndex))
  }

  /** What a touching call leaves the row reading as. */
  function Written<V>(c: Call<V>): Option<V>
  {
    if c.AddRowCall? then Some(c.row) else None
  }

  /** What a call does to a matrix depends on that matrix's entry alone. */
  lemma StepCongruent<V>(t: Table<V>, t': Table<V>, c: Call<V>, m: int)
    requires Entry(t, m) == Entry(t', m)
    ensures Entry(Step(t, c), m) == Entry(Step(t', c), m)
  {
  }

  /** Runs from tables that agree on a matrix still agree on it afterwards. */
  lemma {:induction false} RunCongruent<V>(t: Table<V>, t': Table<V>, calls: seq<Call<V>>, m: int)
    requires Entry(t, m) == Entry(t', m)
    ensures Entry(Run(t, calls), m) == Entry(Run(t', calls), m)
    decreases |calls|
  {
    if calls != [] {
      StepCongruent(t, t', calls[0], m);
      RunCongruent(Step(t, calls[0]), Step(t', calls[0]), calls[1..], m);
    }
  }

  /**
   * Calls on other matrices do not affect a matrix: its entry after a run is
   * its entry after the run of its own calls alone.
   */
  lemma {:induction false} RunOnOwnCalls<V>(t: Table<V>, calls: seq<Call<V>>, m: int)
    ensures Entry(Run(t, calls), m) == Entry(Run(t, On(calls, m)), m)
    decreases |calls|
  {
    if calls != [] {
      var c, rest := calls[0], calls[1..];
      RunOnOwnCalls(Step(t, c), rest, m);
      if c.matrixId == m {
        assert On(calls, m) == [c] + On(rest, m);
        assert ([c] + On(rest, m))[1..] == On(rest, m);
      } else {
        assert On(calls, m) == On(rest, m);
        RunCongruent(Step(t, c), t, On(rest, m), m);
      }
    }
  }

  /** Running two sequences in turn is running their concatenation. */
  lemma {:induction false} RunAppend<V>(t: Table<V>, a: seq<Call<V>>, b: seq<Call<V>>)
    ensures Run(t, a + b) == Run(Run(t, a), b)
    decreases |a|
  {
    if a != [] {
      assert (a + b)[0] == a[0];
      assert (a + b)[1..] == a[1..] + b;
      RunAppend(Step(t, a[0]), a[1..], b);
    } else {
      assert a + b == b;
    }
  }

  /**
   * Lazy creation is visible to later calls: once any call has been made on
   * a matrix, it is registered exactly when the last such call was not
   * removeMatrix.
   */
  lemma RegisteredAfterLastCall<V>(t: Table<V>, calls: seq<Call<V>>, m: int)
    requires On(calls, m) != []
    ensures m in Run(t, calls) <==> !On(calls, m)[|On(calls, m)| - 1].RemoveMatrixCall?
  {
    var own := On(calls, m);
    var n := |own|;
    RunOnOwnCalls(t, calls, m);
    assert own == own[..n - 1] + [own[n - 1]];
    RunAppend(t, own[..n - 1], [own[n - 1]]);
    assert own[n - 1] in own;
    assert Entry(Run(t, calls), m).Some? <==> m in Run(t, calls);
  }

  /** A call that does not touch a row leaves what that row reads as unchanged. */
  lemma StepKeepsRow<V>(t: Table<V>, c: Call<V>, m: int, i: int)
    requires !Touches(c, m, i)
    ensures GetRow(Step(t, c), m, i) == GetRow(t, m, i)
  {
  }

  /** A run of calls none of which touches a row leaves that row's reading unchanged. */
  lemma {:induction false} RunKeepsRow<V>(t: Table<V>, calls: seq<Call<V>>, m: int, i: int)
    requires forall j :: 0 <= j < |calls| ==> !Touches(calls[j], m, i)
    ensures GetRow(Run(t, calls), m, i) == GetRow(t, m, i)
    decreases |calls|
  {
    if calls != [] {
      StepKeepsRow(t, calls[0], m, i);
      RunKeepsRow(Step(t, calls[0]), calls[1..], m, i);
    }
  }

  /**
   * Last writer wins: a row reads as the value of the last call that touched
   * it, i.e. the row of the last addRow, or absent after a removeRow of it or
   * a removeMatrix of its matrix.
   */
  lemma LastWriterWins<V>(t: Table<V>, calls: seq<Call<V>>, m: int, i: int, k: int)
    requires 0 <= k < |calls| && Touches(calls[k], m, i)
    requires forall j :: k < j < |calls| ==> !Touches(calls[j], m, i)
    ensures GetRow(Run(t, calls), m, i) == Written(calls[k])
  {
    assert calls == calls[..k] + [calls[k]] + calls[k + 1..];
    RunAppend(t, calls[..k] + [calls[k]], calls[k + 1..]);
    RunAppend(t, calls[..k], [calls[k]]);
    RunKeepsRow(Run(t, calls[..k + 1]), calls[k + 1..], m, i);
    assert calls[..k + 1] == calls[..k] + [calls[k]];
  }
}
