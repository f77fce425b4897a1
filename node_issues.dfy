/**
 * The whole-node issue assembly (`getNodeIssues`) and the execution-error
 * test it uses (`hasNodeExecutionIssues`).
 */
module NodeIssues {
  import opened Wrappers
  import opened NodeData
  import CredentialIssues

  /** Some recorded run of the node carries an error. */
  predicate HasExecutionIssues(runData: Option<RunData>, name: string) {
    runData.Some? && name in runData.value
    && exists i :: 0 <= i < |runData.value[name]| && runData.value[name][i].error.Some?
  }

  /** `hasNodeExecutionIssues`: scans the node's runs for one whose `error` is defined. */
  method HasNodeExecutionIssues(runData: Option<RunData>, node: Node) returns (b: bool)
    ensures b == HasExecutionIssues(runData, node.name)
  {
    if runData.None? || node.name !in runData.value {
      return false;
    }
    var runs := runData.value[node.name];
    for i := 0 to |runs|
      invariant forall j :: 0 <= j < i ==> runs[j].error.None?
    {
      if runs[i].error.Some? {
        return true;
      }
    }
    return false;
  }

  /** Issues of disabled nodes and of nodes with pinned data are never reported. */
  predicate Suppressed(ctx: Context, node: Node) {
    node.disabled || node.name in ctx.pinned
  }

  /** Whether the `execution` flag is set: an erroneous run exists and the category is not ignored. */
  predicate FlagsExecution(runData: Option<RunData>, node: Node, ignoreIssues: seq<string>) {
    HasExecutionIssues(runData, node.name) && "execution" !in ignoreIssues
  }

  /**
   * For a known type: the parameter validator's issues unless ignored, then
   * the credential issues unless ignored, merged into the former when both
   * are present.
   */
  function KnownTypeIssues(ctx: Context, nodeType: NodeTypeDescription, node: Node, ignoreIssues: seq<string>)
    : Option<IssueSet>
  {
    var parameterIssues :=
      if "parameters" in ignoreIssues then None else ctx.parameterIssues(nodeType.properties, node);
    if "credentials" in ignoreIssues then parameterIssues
    else
      var credentialIssues := CredentialIssues.CredentialIssues(ctx, node, Some(nodeType));
      if parameterIssues.None? then credentialIssues
      else Some(ctx.mergeIssues(parameterIssues.value, credentialIssues))
  }

  /** Adds `execution: true` to an issue set, creating `{}` first when there is none. */
  function WithExecution(issues: Option<IssueSet>): IssueSet {
    (if issues.None? then NO_ISSUES else issues.value).(execution := true)
  }

  /**
   * `getNodeIssues`. A suppressed node has no issues whatever its type and
   * data; an unknown type yields exactly `typeUnknown` (unless ignored) and
   * the execution flag; a known type yields the validator's and the
   * credential check's issues; the execution flag is set whenever a run
   * failed and `execution` is not ignored.
   */
  method GetNodeIssues(
    ctx: Context, runData: Option<RunData>, nodeType: Option<NodeTypeDescription>, node: Node,
    ignoreIssues: seq<string>)
    returns (nodeIssues: Option<IssueSet>)
    ensures Suppressed(ctx, node) ==> nodeIssues.None?
    ensures !Suppressed(ctx, node) && nodeType.None? ==>
              var exec := FlagsExecution(runData, node, ignoreIssues);
              var unknown := "typeUnknown" !in ignoreIssues;
              nodeIssues == if unknown || exec then Some(IssueSet(unknown, None, None, exec)) else None
    ensures !Suppressed(ctx, node) && nodeType.Some? && !FlagsExecution(runData, node, ignoreIssues) ==>
              nodeIssues == KnownTypeIssues(ctx, nodeType.value, node, ignoreIssues)
    ensures !Suppressed(ctx, node) && nodeType.Some? && FlagsExecution(runData, node, ignoreIssues) ==>
              nodeIssues == Some(WithExecution(KnownTypeIssues(ctx, nodeType.value, node, ignoreIssues)))
    ensures !Suppressed(ctx, node) && FlagsExecution(runData, node, ignoreIssues) ==>
              nodeIssues.Some? && nodeIssues.value.execution
  {
    nodeIssues := None;
    if node.disabled || node.name in ctx.pinned {
      return None;
    }

    if nodeType.None? {
      if "typeUnknown" !in ignoreIssues {
        nodeIssues := Some(IssueSet(true, None, None, false));
      }
    } else {
      if "parameters" !in ignoreIssues {
        nodeIssues := ctx.parameterIssues(nodeType.value.properties, node);
      }
      if "credentials" !in ignoreIssues {
        var nodeCredentialIssues := CredentialIssues.GetNodeCredentialIssues(ctx, node, nodeType);
        if nodeIssues.None? {
          nodeIssues := nodeCredentialIssues;
        } else {
          nodeIssues := Some(ctx.mergeIssues(nodeIssues.value, nodeCredentialIssues));
        }
      }
    }

    var hasExecutionIssues := HasNodeExecutionIssues(runData, node);
    if hasExecutionIssues && "execution" !in ignoreIssues {
      if nodeIssues.None? {
        nodeIssues := Some(NO_ISSUES);
      }
      nodeIssues := Some(nodeIssues.value.(execution := true));
    }
  }
}
