/**
 * Slicing of execution run data for display: the items of one `main`
 * output (`getMainInputData`), the input items of a node's run
 * (`getNodeInputData`) and the binary attachments of those items
 * (`getBinaryData`).
 */
module RunData {
  import opened Wrappers
  import opened NodeData

  /** What a JavaScript read returns: a list of items, `undefined`, or a thrown `TypeError`. */
  datatype Lookup = Items(items: seq<Item>) | Undefined | Throws

  /** `getMainInputData` as written: its guard is `main.length < outputIndex`. */
  function MainInputDataAsWritten(data: Connections, outputIndex: nat): Lookup {
    if data.main.None? || |data.main.value| < outputIndex then Items([])
    else if outputIndex == |data.main.value| then Undefined
    else if data.main.value[outputIndex].None? then Items([])
    else Items(data.main.value[outputIndex].value)
  }

  /**
   * `getMainInputData` with the guard `main.length <= outputIndex`: the
   * slot's items, or no items when `main` is absent, too short or the slot
   * is `null`.
   */
  function MainInputData(data: Connections, outputIndex: nat): (r: seq<Item>)
    ensures data.main.Some? && outputIndex < |data.main.value| && data.main.value[outputIndex].Some? ==>
              r == data.main.value[outputIndex].value
    ensures data.main.None? || outputIndex >= |data.main.value| || data.main.value[outputIndex].None? ==>
              r == []
  {
    if data.main.None? || |data.main.value| <= outputIndex || data.main.value[outputIndex].None? then []
    else data.main.value[outputIndex].value
  }

  /**
   * The guard as written lets `outputIndex == main.length` through and then
   * returns `undefined`; on every other input it agrees with the corrected
   * guard.
   */
  lemma MainInputDataGuardGap(data: Connections, outputIndex: nat)
    ensures MainInputDataAsWritten(data, outputIndex) == Undefined
        <==> data.main.Some? && outputIndex == |data.main.value|
    ensures MainInputDataAsWritten(data, outputIndex) != Undefined
        ==> MainInputDataAsWritten(data, outputIndex) == Items(MainInputData(data, outputIndex))
  {
  }

  /** The smallest input on which the as-written guard fails: an empty `main` read at index 0. */
  lemma MainInputDataUndefinedOnEmptyMain()
    ensures MainInputDataAsWritten(Connections(Some([])), 0) == Undefined
    ensures MainInputData(Connections(Some([])), 0) == []
  {
  }

  /** The snapshot of the last execution the editor holds, down to its run data. */
  datatype ResultData = ResultData(runData: Option<RunData>)
  datatype ExecutionData = ExecutionData(resultData: Option<ResultData>)
  datatype ExecutionSnapshot = ExecutionSnapshot(data: Option<ExecutionData>)

  /** The run data of a snapshot, `None` when any level of it is missing. */
  function SnapshotRunData(execution: Option<ExecutionSnapshot>): Option<RunData> {
    if execution.None? || execution.value.data.None? || execution.value.data.value.resultData.None? then None
    else execution.value.data.value.resultData.value.runData
  }

  /** `getNodeInputData` as written: `runs[runIndex].data` is read without checking `runIndex`. */
  function NodeInputDataAsWritten(
    node: Option<Node>, execution: Option<ExecutionSnapshot>, runIndex: nat, outputIndex: nat): Lookup
  {
    if node.None? then Items([])
    else
      var runData := SnapshotRunData(execution);
      if runData.None? || node.value.name !in runData.value then Items([])
      else
        var runs := runData.value[node.value.name];
        if |runs| <= runIndex then Throws
        else if runs[runIndex].data.None? then Items([])
        else MainInputDataAsWritten(runs[runIndex].data.value, outputIndex)
  }

  /** The connections a run recorded, when the node, the run and its data all exist. */
  function RunConnections(runData: Option<RunData>, nodeName: string, runIndex: nat): Option<Connections> {
    if runData.None? || nodeName !in runData.value || |runData.value[nodeName]| <= runIndex then None
    else runData.value[nodeName][runIndex].data
  }

  /**
   * `getNodeInputData` with the run index checked: the items of output
   * `outputIndex` of the node's run `runIndex`, or none when the node, the
   * execution, its run data, the run or the run's data is missing.
   */
  function NodeInputData(
    node: Option<Node>, execution: Option<ExecutionSnapshot>, runIndex: nat, outputIndex: nat): (r: seq<Item>)
    ensures node.None? || RunConnections(SnapshotRunData(execution), node.value.name, runIndex).None? ==> r == []
    ensures node.Some? && RunConnections(SnapshotRunData(execution), node.value.name, runIndex).Some? ==>
              r == MainInputData(RunConnections(SnapshotRunData(execution), node.value.name, runIndex).value, outputIndex)
  {
    if node.None? then []
    else
      var runData := SnapshotRunData(execution);
      if runData.None? || node.value.name !in runData.value then []
      else
        var runs := runData.value[node.value.name];
        if |runs| <= runIndex || runs[runIndex].data.None? then []
        else MainInputData(runs[runIndex].data.value, outputIndex)
  }

  /**
   * The as-written code throws exactly when the node has runs but none at
   * `runIndex`; whenever it returns items they are the corrected result.
   */
  lemma NodeInputDataRunIndexGap(
    node: Option<Node>, execution: Option<ExecutionSnapshot>, runIndex: nat, outputIndex: nat)
    ensures NodeInputDataAsWritten(node, execution, runIndex, outputIndex) == Throws
        <==> node.Some? && SnapshotRunData(execution).Some? && node.value.name in SnapshotRunData(execution).value
             && |SnapshotRunData(execution).value[node.value.name]| <= runIndex
    ensures NodeInputDataAsWritten(node, execution, runIndex, outputIndex).Items?
        ==> NodeInputDataAsWritten(node, execution, runIndex, outputIndex).items
            == NodeInputData(node, execution, runIndex, outputIndex)
  {
    var w := NodeInputDataAsWritten(node, execution, runIndex, outputIndex);
    if w.Items? && node.Some? {
      var runData := SnapshotRunData(execution);
      if runData.Some? && node.value.name in runData.value {
        var runs := runData.value[node.value.name];
        if runIndex < |runs| && runs[runIndex].data.Some? {
          MainInputDataGuardGap(runs[runIndex].data.value, outputIndex);
        }
      }
    }
  }

  /** The binary fields of the items that have one, in item order. */
  function BinaryFields(items: seq<Item>): seq<BinaryKeyData>
    decreases |items|
  {
    if items == [] then []
    else
      var last := items[|items| - 1];
      BinaryFields(items[..|items| - 1]) + (if last.binary.Some? then [last.binary.value] else [])
  }

  /** Collecting binaries distributes over concatenation: order is kept, nothing is added or lost. */
  lemma {:induction false} BinaryFieldsAppend(a: seq<Item>, b: seq<Item>)
    ensures BinaryFields(a + b) == BinaryFields(a) + BinaryFields(b)
    decreases |b|
  {
    if b == [] {
      assert a + b == a;
    } else {
      var n := |b| - 1;
      assert (a + b)[..|a + b| - 1] == a + b[..n];
      assert (a + b)[|a + b| - 1] == b[n];
      BinaryFieldsAppend(a, b[..n]);
    }
  }

  /** At most one binary per item, and a binary is collected exactly when some item carries it. */
  lemma {:induction false} BinaryFieldsBounds(items: seq<Item>)
    ensures |BinaryFields(items)| <= |items|
    ensures forall b :: b in BinaryFields(items) <==> exists i :: 0 <= i < |items| && items[i].binary == Some(b)
    decreases |items|
  {
    if items != [] {
      var n := |items| - 1;
      var prefix := items[..n];
      var tail := if items[n].binary.Some? then [items[n].binary.value] else [];
      assert BinaryFields(items) == BinaryFields(prefix) + tail;
      BinaryFieldsBounds(prefix);
      forall b
        ensures b in BinaryFields(items) <==> exists i :: 0 <= i < |items| && items[i].binary == Some(b)
      {
        if b in BinaryFields(prefix) {
          var i :| 0 <= i < |prefix| && prefix[i].binary == Some(b);
          assert items[i] == prefix[i];
        } else if items[n].binary == Some(b) {
          assert b in tail;
        } else {
          assert b !in BinaryFields(items);
          forall i | 0 <= i < |items|
            ensures items[i].binary != Some(b)
          {
            if i < n {
              assert prefix[i] == items[i];
            }
          }
        }
      }
    }
  }

  /**
   * `getBinaryData`: the binary fields, in order, of the items of the run's
   * output `outputIndex`; none when the node name, the run data, the node's
   * runs, the run or its data is missing.
   */
  method GetBinaryData(runData: Option<RunData>, node: Option<string>, runIndex: nat, outputIndex: nat)
    returns (returnData: seq<BinaryKeyData>)
    ensures node.None? || RunConnections(runData, node.value, runIndex).None? ==> returnData == []
    ensures node.Some? && RunConnections(runData, node.value, runIndex).Some? ==>
              returnData == BinaryFields(MainInputData(RunConnections(runData, node.value, runIndex).value, outputIndex))
  {
    if node.None? {
      return [];
    }
    if runData.None? || node.value !in runData.value || |runData.value[node.value]| <= runIndex
       || runData.value[node.value][runIndex].data.None?
    {
      return [];
    }
    var inputData := MainInputData(runData.value[node.value][runIndex].data.value, outputIndex);

    returnData := [];
    for i := 0 to |inputData|
      invariant returnData == BinaryFields(inputData[..i])
    {
      assert inputData[..i + 1][..i] == inputData[..i];
      if inputData[i].binary.Some? {
        returnData := returnData + [inputData[i].binary.value];
      }
    }
    assert inputData[..|inputData|] == inputData;
  }

  /** What `getBinaryData` as written gives: the collected binaries, or a thrown `TypeError`. */
  datatype BinaryLookup = Binaries(binaries: seq<BinaryKeyData>) | BinaryTypeError

  /**
   * `getBinaryData` on top of the as-written `getMainInputData`: when that
   * returns `undefined`, reading `inputData.length` throws.
   */
  function BinaryDataAsWritten(runData: Option<RunData>, node: Option<string>, runIndex: nat, outputIndex: nat)
    : BinaryLookup
  {
    if node.None? then Binaries([])
    else match RunConnections(runData, node.value, runIndex)
      case None => Binaries([])
      case Some(data) =>
        match MainInputDataAsWritten(data, outputIndex)
        case Items(items) => Binaries(BinaryFields(items))
        case _ => BinaryTypeError
  }

  /**
   * As written, `getBinaryData` throws exactly when the run's `main` has
   * exactly `outputIndex` outputs; otherwise it returns the binaries of the
   * corrected lookup.
   */
  lemma BinaryDataGap(runData: Option<RunData>, node: Option<string>, runIndex: nat, outputIndex: nat)
    ensures BinaryDataAsWritten(runData, node, runIndex, outputIndex) == BinaryTypeError
        <==> node.Some? && RunConnections(runData, node.value, runIndex).Some?
             && RunConnections(runData, node.value, runIndex).value.main.Some?
             && outputIndex == |RunConnections(runData, node.value, runIndex).value.main.value|
    ensures BinaryDataAsWritten(runData, node, runIndex, outputIndex) != BinaryTypeError ==>
              BinaryDataAsWritten(runData, node, runIndex, outputIndex)
              == Binaries(if node.None? || RunConnections(runData, node.value, runIndex).None? then []
                          else BinaryFields(MainInputData(RunConnections(runData, node.value, runIndex).value, outputIndex)))
  {
    if node.Some? && RunConnections(runData, node.value, runIndex).Some? {
      MainInputDataGuardGap(RunConnections(runData, node.value, runIndex).value, outputIndex);
    }
  }

  /**
   * A run whose single output holds an item with a binary, read at output 1:
   * as written the call throws, corrected it returns no binaries.
   */
  lemma BinaryDataThrowsPastLastOutput(b: BinaryKeyData)
    ensures var runData := Some(map["n" := [TaskData(None, Some(Connections(Some([Some([Item(map[], Some(b))])]))))]]);
            BinaryDataAsWritten(runData, Some("n"), 0, 1) == BinaryTypeError
            && BinaryFields(MainInputData(RunConnections(runData, "n", 0).value, 1)) == []
  {
  }
}
